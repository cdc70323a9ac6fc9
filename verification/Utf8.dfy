/** UTF-8 (RFC 3629): the encoding behind every byte-level pass over text. */
module Utf8 {
  import opened Options

  type Byte = b: int | 0 <= b < 256
  type Bytes = seq<Byte>

  /** Bytes 0x80..0xBF, which never start a character. */
  predicate IsContinuation(b: Byte) {
    0x80 <= b < 0xC0
  }

  function EncodeChar(c: char): (b: Bytes)
    ensures 1 <= |b| <= 4
    ensures c as int < 0x80 ==> b == [c as int]
    ensures c as int >= 0x80 ==> forall i :: 0 <= i < |b| ==> b[i] >= 0x80
    ensures !IsContinuation(b[0]) && forall i :: 0 < i < |b| ==> IsContinuation(b[i])
  {
    var u := c as int;
    if u < 0x80 then [u]
    else if u < 0x800 then [0xC0 + u / 0x40, 0x80 + u % 0x40]
    else if u < 0x10000 then [0xE0 + u / 0x1000, 0x80 + u / 0x40 % 0x40, 0x80 + u % 0x40]
    else [0xF0 + u / 0x40000, 0x80 + u / 0x1000 % 0x40, 0x80 + u / 0x40 % 0x40, 0x80 + u % 0x40]
  }

  function Encode(s: string): Bytes {
    if s == [] then [] else EncodeChar(s[0]) + Encode(s[1..])
  }

  /** Six more bits of a code point, from a continuation byte. */
  function Shift(u: int, b: Byte): int {
    u * 0x40 + (b as int - 0x80)
  }

  /** The first character of `b` and its length, refusing truncated, overlong and surrogate forms. */
  function DecodeChar(b: Bytes): Option<(char, nat)> {
    if |b| >= 1 && b[0] < 0x80 then Some((b[0] as char, 1))
    else if |b| >= 2 && 0xC2 <= b[0] < 0xE0 && IsContinuation(b[1]) then
      Some((Shift(b[0] as int - 0xC0, b[1]) as char, 2))
    else if |b| >= 3 && 0xE0 <= b[0] < 0xF0 && IsContinuation(b[1]) && IsContinuation(b[2]) then
      var u := Shift(Shift(b[0] as int - 0xE0, b[1]), b[2]);
      if u < 0x800 || 0xD800 <= u < 0xE000 then None else Some((u as char, 3))
    else if |b| >= 4 && 0xF0 <= b[0] < 0xF5 && IsContinuation(b[1]) && IsContinuation(b[2]) && IsContinuation(b[3]) then
      var u := Shift(Shift(Shift(b[0] as int - 0xF0, b[1]), b[2]), b[3]);
      if 0x10000 <= u < 0x110000 then Some((u as char, 4)) else None
    else None
  }

  /** `std::str::from_utf8`: the whole input, or nothing. */
  function Decode(b: Bytes): Option<string> {
    if b == [] then Some("")
    else match DecodeChar(b)
      case None => None
      case Some((c, n)) =>
        assert 0 < n <= |b|;
        match Decode(b[n..])
        case None => None
        case Some(s) => Some([c] + s)
  }

  predicate ValidUtf8(b: Bytes) {
    Decode(b).Some?
  }

  lemma ShiftSplits(u: nat)
    ensures Shift(u / 0x40, 0x80 + u % 0x40) == u
    ensures u / 0x40 / 0x40 == u / 0x1000 && u / 0x1000 / 0x40 == u / 0x40000
  {}

  lemma ShiftInverse(u: nat, b: Byte)
    requires IsContinuation(b)
    ensures Shift(u, b) / 0x40 == u && Shift(u, b) % 0x40 == b as int - 0x80
  {}

  lemma DecodeEncodedChar(c: char, rest: Bytes)
    ensures DecodeChar(EncodeChar(c) + rest) == Some((c, |EncodeChar(c)|))
  {
    hide Shift;
    var u := c as int;
    var b := EncodeChar(c) + rest;
    ShiftSplits(u);
    ShiftSplits(u / 0x40);
    ShiftSplits(u / 0x1000);
    if u < 0x80 {
    } else if u < 0x800 {
      assert b[0] == 0xC0 + u / 0x40 && b[1] == 0x80 + u % 0x40;
    } else if u < 0x10000 {
      assert b[0] == 0xE0 + u / 0x1000 && b[1] == 0x80 + u / 0x40 % 0x40 && b[2] == 0x80 + u % 0x40;
    } else {
      assert b[0] == 0xF0 + u / 0x40000 && b[1] == 0x80 + u / 0x1000 % 0x40;
      assert b[2] == 0x80 + u / 0x40 % 0x40 && b[3] == 0x80 + u % 0x40;
    }
  }

  lemma EncodeDecodedChar(b: Bytes)
    requires DecodeChar(b).Some?
    ensures DecodeChar(b).value.1 <= |b|
    ensures EncodeChar(DecodeChar(b).value.0) == b[..DecodeChar(b).value.1]
  {
    hide Shift;
    var (c, n) := DecodeChar(b).value;
    ShiftSplits(c as int);
    if n == 2 {
      ShiftInverse(b[0] as int - 0xC0, b[1]);
    } else if n == 3 {
      ShiftInverse(b[0] as int - 0xE0, b[1]);
      ShiftInverse(Shift(b[0] as int - 0xE0, b[1]), b[2]);
    } else if n == 4 {
      ShiftInverse(b[0] as int - 0xF0, b[1]);
      ShiftInverse(Shift(b[0] as int - 0xF0, b[1]), b[2]);
      ShiftInverse(Shift(Shift(b[0] as int - 0xF0, b[1]), b[2]), b[3]);
      ShiftSplits(c as int / 0x40);
    }
  }

  /** Decoding inverts encoding and accepts nothing else. */
  lemma {:induction false} DecodeEncode(s: string)
    ensures Decode(Encode(s)) == Some(s)
  {
    if s != [] {
      DecodeEncodedChar(s[0], Encode(s[1..]));
      assert Encode(s)[|EncodeChar(s[0])|..] == Encode(s[1..]);
      DecodeEncode(s[1..]);
      assert [s[0]] + s[1..] == s;
    }
  }

  lemma DecodeStep(b: Bytes)
    requires b != [] && ValidUtf8(b)
    ensures DecodeChar(b).Some?
    ensures var (c, n) := DecodeChar(b).value;
            n <= |b| && b == EncodeChar(c) + b[n..] && ValidUtf8(b[n..])
                && Decode(b).value == [c] + Decode(b[n..]).value
  {
    EncodeDecodedChar(b);
    hide DecodeChar, EncodeChar;
    var n := DecodeChar(b).value.1;
    assert b == b[..n] + b[n..];
  }

  lemma {:induction false} EncodeDecode(b: Bytes)
    requires ValidUtf8(b)
    ensures Encode(Decode(b).value) == b
  {
    if b != [] {
      hide DecodeChar, EncodeChar, Decode;
      DecodeStep(b);
      var (c, n) := DecodeChar(b).value;
      EncodeDecode(b[n..]);
      assert ([c] + Decode(b[n..]).value)[1..] == Decode(b[n..]).value;
    }
  }

  /** One character of each length: U+0041, U+03B1, U+D55C and U+233B4, as in section 7 of RFC 3629. */
  lemma KnownEncodings()
    ensures EncodeChar('A') == [0x41] && EncodeChar('\U{03B1}') == [0xCE, 0xB1]
    ensures EncodeChar('\U{D55C}') == [0xED, 0x95, 0x9C] && EncodeChar('\U{233B4}') == [0xF0, 0xA3, 0x8E, 0xB4]
  {}

  lemma EncodeInjective(s: string, t: string)
    requires Encode(s) == Encode(t)
    ensures s == t
  {
    DecodeEncode(s);
    DecodeEncode(t);
  }

  lemma {:induction false} EncodeAppend(s: string, t: string)
    ensures Encode(s + t) == Encode(s) + Encode(t)
  {
    if s == [] {
      assert s + t == t;
    } else {
      assert (s + t)[1..] == s[1..] + t;
      EncodeAppend(s[1..], t);
    }
  }

  lemma FirstCharWhole(s: string, i: nat)
    requires s != "" && 0 < i <= |Encode(s)| && (i < |Encode(s)| ==> !IsContinuation(Encode(s)[i]))
    ensures |EncodeChar(s[0])| <= i
  {}

  lemma CutBehindFirst(first: Bytes, rest: Bytes, i: nat)
    requires |first| <= i <= |first| + |rest|
    ensures (first + rest)[..i] == first + rest[..i - |first|] && (first + rest)[i..] == rest[i - |first|..]
    ensures i < |first| + |rest| ==> (first + rest)[i] == rest[i - |first|]
  {}

  /** A byte index that is no continuation byte splits the text between two characters. */
  lemma {:induction false} SplitAtBoundary(s: string, i: nat) returns (k: nat)
    requires i <= |Encode(s)|
    requires i < |Encode(s)| ==> !IsContinuation(Encode(s)[i])
    ensures k <= |s| && Encode(s[..k]) == Encode(s)[..i] && Encode(s[k..]) == Encode(s)[i..]
  {
    hide EncodeChar, IsContinuation;
    if i == 0 {
      k := 0;
    } else {
      var first, rest := EncodeChar(s[0]), Encode(s[1..]);
      FirstCharWhole(s, i);
      CutBehindFirst(first, rest, i);
      var j := SplitAtBoundary(s[1..], i - |first|);
      k := j + 1;
      assert s[..k][1..] == s[1..][..j];
      assert s[k..] == s[1..][j..];
    }
  }

  predicate IsBoundary(b: Bytes, i: nat) {
    i <= |b| && (i < |b| ==> !IsContinuation(b[i]))
  }

  /** Cutting text at two boundaries leaves text. */
  lemma SliceIsText(b: Bytes, i: nat, j: nat)
    requires ValidUtf8(b) && i <= j && IsBoundary(b, i) && IsBoundary(b, j)
    ensures ValidUtf8(b[i..j])
  {
    var s := Decode(b).value;
    EncodeDecode(b);
    var k := SplitAtBoundary(s, j);
    var m := SplitAtBoundary(s[..k], i);
    DecodeEncode(s[..k][m..]);
    assert b[..j][i..] == b[i..j];
  }

  lemma StartIsBoundary(b: Bytes)
    requires ValidUtf8(b)
    ensures IsBoundary(b, 0)
  {}

  /** An ASCII byte is a character of its own. */
  lemma {:induction false} AsciiIsBoundary(b: Bytes, i: nat)
    requires ValidUtf8(b) && i < |b| && b[i] < 0x80
    ensures IsBoundary(b, i) && IsBoundary(b, i + 1)
  {
    var s := Decode(b).value;
    EncodeDecode(b);
    AsciiInEncoding(s, i);
  }

  lemma {:induction false} AsciiInEncoding(s: string, i: nat)
    requires i < |Encode(s)| && Encode(s)[i] < 0x80
    ensures i + 1 < |Encode(s)| ==> !IsContinuation(Encode(s)[i + 1])
  {
    var head, tail := EncodeChar(s[0]), Encode(s[1..]);
    if i < |head| {
      assert i == 0 && |head| == 1;
      assert s[1..] != "" ==> tail[0] == EncodeChar(s[1..][0])[0];
    } else {
      AsciiInEncoding(s[1..], i - |head|);
    }
  }

  /** Bytes that start with a character leave no choice of it. */
  lemma SameFirstChar(c: char, x: Bytes, d: char, y: Bytes)
    requires EncodeChar(c) + x == EncodeChar(d) + y
    ensures c == d && x == y
  {
    hide EncodeChar, DecodeChar;
    DecodeEncodedChar(c, x);
    DecodeEncodedChar(d, y);
    assert x == (EncodeChar(c) + x)[|EncodeChar(c)|..] && y == (EncodeChar(d) + y)[|EncodeChar(d)|..];
  }

  /** A text whose bytes begin another's is a prefix of it. */
  lemma {:induction false} EncodingPrefix(t: string, s: string, tail: Bytes)
    requires Encode(t) + tail == Encode(s)
    ensures t <= s
  {
    if t != "" {
      hide EncodeChar;
      var rest := Encode(t[1..]);
      assert EncodeChar(t[0]) + rest + tail == EncodeChar(t[0]) + (rest + tail);
      SameFirstChar(t[0], rest + tail, s[0], Encode(s[1..]));
      EncodingPrefix(t[1..], s[1..], tail);
      assert t == [t[0]] + t[1..] && s == [s[0]] + s[1..];
    }
  }

  /** The bytes of a text, cut off, are text exactly when the cut is behind a whole character. */
  lemma CutDecodes(s: string, j: nat)
    requires j <= |Encode(s)|
    ensures forall c :: 0 <= c <= |s| && j == |Encode(s[..c])| ==> Decode(Encode(s)[..j]) == Some(s[..c])
    ensures Decode(Encode(s)[..j]).Some? ==>
              var t := Decode(Encode(s)[..j]).value; t <= s && Encode(t) == Encode(s)[..j] && t == s[..|t|]
  {
    hide Encode, Decode;
    var b := Encode(s)[..j];
    forall c | 0 <= c <= |s| && j == |Encode(s[..c])| ensures Decode(b) == Some(s[..c]) {
      EncodeAppend(s[..c], s[c..]);
      assert s[..c] + s[c..] == s;
      assert b == Encode(s[..c]);
      DecodeEncode(s[..c]);
    }
    if Decode(b).Some? {
      EncodeDecode(b);
      EncodingPrefix(Decode(b).value, s, Encode(s)[j..]);
    }
  }
}

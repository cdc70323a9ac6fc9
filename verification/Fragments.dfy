/** URI fragments that carry a JSON Pointer (RFC 6901, section 6; RFC 3986, section 2.1). */
module Fragments {
  import opened Options
  import opened Utf8
  import JsonPointer

  /** Entry `n` of the table `0123456789ABCDEF`. */
  function HexChar(n: nat): char
    requires n < 16
  {
    if n < 10 then (0x30 + n) as char else (0x37 + n) as char
  }

  predicate IsAlphanumeric(b: Byte) {
    0x30 <= b <= 0x39 || 0x41 <= b <= 0x5A || 0x61 <= b <= 0x7A
  }

  /** Bytes the generator leaves as they are: `-` `.` `_` `~` `/` and alphanumerics. */
  predicate IsKept(b: Byte) {
    IsAlphanumeric(b) || b in {0x2D, 0x2E, 0x5F, 0x7E, 0x2F}
  }

  /** Bytes the parser admits unencoded: those of `-._~!$&'()*+,;=:@/?` and alphanumerics. */
  predicate IsAdmitted(b: Byte) {
    IsKept(b) || b in {0x21, 0x24, 0x26, 0x27, 0x28, 0x29, 0x2A, 0x2B, 0x2C, 0x3B, 0x3D, 0x3A, 0x40, 0x3F}
  }

  // ----- Printing -----

  function EncodeByte(b: Byte): string {
    if IsKept(b) then [b as char] else ['%', HexChar(b / 16), HexChar(b % 16)]
  }

  function EncodeBytes(b: Bytes): string {
    if b == [] then "" else EncodeByte(b[0]) + EncodeBytes(b[1..])
  }

  lemma {:induction false} EncodeBytesAppend(b: Bytes, x: Byte)
    ensures EncodeBytes(b + [x]) == EncodeBytes(b) + EncodeByte(x)
  {
    if b == [] {
      assert [] + [x] == [x];
    } else {
      hide EncodeByte;
      assert (b + [x])[1..] == b[1..] + [x];
      EncodeBytesAppend(b[1..], x);
    }
  }

  lemma EncodeByteParts(encoded: string, b: Byte)
    ensures encoded + EncodeByte(b) ==
            if IsKept(b) then encoded + [b as char] else encoded + ['%'] + [HexChar(b / 16)] + [HexChar(b % 16)]
  {}

  lemma OneMoreByte(bytes: Bytes, n: nat)
    requires n < |bytes|
    ensures EncodeBytes(bytes[..n + 1]) == EncodeBytes(bytes[..n]) + EncodeByte(bytes[n])
  {
    hide EncodeBytes, EncodeByte;
    EncodeBytesAppend(bytes[..n], bytes[n]);
    assert bytes[..n] + [bytes[n]] == bytes[..n + 1];
  }

  lemma AllBytes(bytes: Bytes)
    ensures EncodeBytes(bytes[..0]) == "" && EncodeBytes(bytes[..|bytes|]) == EncodeBytes(bytes)
  {
    hide EncodeByte;
    assert bytes[..|bytes|] == bytes;
  }

  method EncodeFragment(pointer: string) returns (encoded: string)
    ensures encoded == EncodeBytes(Encode(pointer))
  {
    var bytes := Encode(pointer);
    encoded := "";
    hide Encode, EncodeBytes, EncodeByte, IsKept, HexChar;
    AllBytes(bytes);
    for n := 0 to |bytes|
      invariant encoded == EncodeBytes(bytes[..n])
    {
      OneMoreByte(bytes, n);
      EncodeByteParts(encoded, bytes[n]);
      if IsKept(bytes[n]) {
        encoded := encoded + [bytes[n] as char];
      } else {
        encoded := encoded + ['%'];
        encoded := encoded + [HexChar(bytes[n] / 16)];
        encoded := encoded + [HexChar(bytes[n] % 16)];
      }
    }
  }

  // ----- Parsing -----

  function HexDigit(b: Byte): Option<Byte> {
    if 0x30 <= b <= 0x39 then Some(b - 0x30)
    else if 0x41 <= b <= 0x46 then Some(b - 0x37)
    else if 0x61 <= b <= 0x66 then Some(b - 0x57)
    else None
  }

  function Cons(b: Byte, rest: Option<Bytes>): Option<Bytes> {
    match rest case Some(r) => Some([b] + r) case None => None
  }

  function HexByte(a: Byte, b: Byte): Option<Byte> {
    match (HexDigit(a), HexDigit(b))
    case (Some(x), Some(y)) => if x < 16 && y < 16 then Some(x * 16 + y) else None
    case _ => None
  }

  function DecodeFragment(f: Bytes): Option<Bytes> {
    if f == [] then Some([])
    else if f[0] == 0x25 then
      if |f| >= 3 && HexByte(f[1], f[2]).Some? then Cons(HexByte(f[1], f[2]).value, DecodeFragment(f[3..])) else None
    else if IsAdmitted(f[0]) then Cons(f[0], DecodeFragment(f[1..]))
    else None
  }

  /** The pointer text a fragment carries: percent-decoded once, then read as UTF-8. */
  function PointerText(fragment: string): Option<string> {
    match DecodeFragment(Encode(fragment))
    case None => None
    case Some(decoded) => Decode(decoded)
  }

  /** The reference tokens a fragment carries. */
  function FragmentTokens(fragment: string): Option<seq<string>> {
    match PointerText(fragment)
    case None => None
    case Some(pointer) => JsonPointer.Parse(pointer)
  }

  /** Both loops together accept exactly the fragments that carry a JSON Pointer. */
  method ValidPointerFragment(fragment: string) returns (ok: bool)
    ensures ok <==> FragmentTokens(fragment).Some?
  {
    var bytes := Encode(fragment);
    var decoded: Bytes, next := [], 0;
    assert bytes[0..] == bytes;
    JoinNothing(DecodeFragment(bytes));
    while next < |bytes|
      invariant 0 <= next <= |bytes|
      invariant DecodeFragment(bytes) == Join(decoded, DecodeFragment(bytes[next..]))
    {
      ghost var rest := bytes[next..];
      var byte := bytes[next];
      next := next + 1;
      if byte == 0x25 {
        if next + 1 >= |bytes| {
          return false;
        }
        var value := HexByte(bytes[next], bytes[next + 1]);
        next := next + 2;
        if value.None? {
          return false;
        }
        assert rest[3..] == bytes[next..];
        JoinCons(decoded, value.value, DecodeFragment(bytes[next..]));
        decoded := decoded + [value.value];
      } else if IsAdmitted(byte) {
        assert rest[1..] == bytes[next..];
        JoinCons(decoded, byte, DecodeFragment(bytes[next..]));
        decoded := decoded + [byte];
      } else {
        return false;
      }
    }
    assert decoded + [] == decoded;
    var pointer := Decode(decoded);
    if pointer.None? {
      return false;
    }
    JsonPointer.PointersParse(pointer.value);
    if pointer.value != "" && pointer.value[0] != '/' {
      return false;
    }
    var at := 0;
    while at < |pointer.value|
      invariant 0 <= at <= |pointer.value|
      invariant JsonPointer.EscapesOk(pointer.value) == JsonPointer.EscapesOk(pointer.value[at..])
    {
      ghost var rest := pointer.value[at..];
      var ch := pointer.value[at];
      at := at + 1;
      if ch == '~' {
        if at == |pointer.value| || pointer.value[at] !in {'0', '1'} {
          return false;
        }
        at := at + 1;
        assert rest[2..] == pointer.value[at..];
      } else {
        assert rest[1..] == pointer.value[at..];
      }
    }
    return true;
  }

  ghost function Join(done: Bytes, rest: Option<Bytes>): Option<Bytes> {
    match rest case Some(r) => Some(done + r) case None => None
  }

  lemma JoinNothing(rest: Option<Bytes>)
    ensures Join([], rest) == rest
  {
    if rest.Some? {
      assert [] + rest.value == rest.value;
    }
  }

  lemma JoinCons(done: Bytes, b: Byte, rest: Option<Bytes>)
    ensures Join(done, Cons(b, rest)) == Join(done + [b], rest)
  {
    if rest.Some? {
      assert done + ([b] + rest.value) == done + [b] + rest.value;
    }
  }

  // ----- The characters of a fragment -----

  /** Printable ASCII but for the characters a fragment may not hold, and `%`, which starts an escape. */
  lemma AdmittedExact(b: Byte)
    ensures IsAdmitted(b) <==> 0x20 < b < 0x7F && b as char !in "%\"#<>[\\]^`{|}"
    ensures IsKept(b) <==> IsAdmitted(b) && b as char !in "!$&'()*+,;=:@?"
  {}

  /** An escape is written in capitals and read in either case. */
  lemma HexExact(n: nat)
    requires n < 16
    ensures HexChar(n) == "0123456789ABCDEF"[n]
    ensures HexDigit(HexChar(n) as int) == Some(n) && HexDigit("0123456789abcdef"[n] as int) == Some(n)
  {}

  lemma HexDigitExact(b: Byte)
    ensures HexDigit(b).Some? ==>
              HexDigit(b).value < 16
              && b as char in ["0123456789ABCDEF"[HexDigit(b).value], "0123456789abcdef"[HexDigit(b).value]]
  {}

  // ----- Round trip -----

  predicate IsAscii(s: string) {
    forall i :: 0 <= i < |s| ==> s[i] as int < 0x80
  }

  lemma HexRoundTrip(b: Byte)
    ensures IsAscii(EncodeByte(b))
    ensures !IsKept(b) ==> HexByte(HexChar(b / 16) as int, HexChar(b % 16) as int) == Some(b)
  {
  }

  lemma DecodeEncodedByte(b: Byte, rest: Bytes)
    ensures DecodeFragment(Encode(EncodeByte(b)) + rest) == Cons(b, DecodeFragment(rest))
  {
    HexRoundTrip(b);
    if IsKept(b) {
      assert Encode([b as char]) == [b];
      assert ([b] + rest)[1..] == rest;
    } else {
      var x, y := HexChar(b / 16), HexChar(b % 16);
      assert ['%', x, y][1..] == [x, y] && [x, y][1..] == [y];
      assert Encode([y]) == [y as int];
      assert Encode([x, y]) == [x as int, y as int];
      assert Encode(['%', x, y]) == [0x25, x as int, y as int];
      assert ([0x25, x as int, y as int] + rest)[3..] == rest;
    }
  }

  /** Percent-decoding undoes percent-encoding, for every byte sequence. */
  lemma {:induction false} DecodeEncodedBytes(b: Bytes)
    ensures DecodeFragment(Encode(EncodeBytes(b))) == Some(b)
  {
    if b != [] {
      EncodeAppend(EncodeByte(b[0]), EncodeBytes(b[1..]));
      DecodeEncodedByte(b[0], Encode(EncodeBytes(b[1..])));
      DecodeEncodedBytes(b[1..]);
      assert [b[0]] + b[1..] == b;
    }
  }

  /** So an encoded pointer carries its tokens through exactly one decoding, for all Unicode text. */
  lemma FragmentRoundTrip(tokens: seq<string>)
    ensures FragmentTokens(EncodeBytes(Encode(JsonPointer.Print(tokens)))) == Some(tokens)
  {
    var pointer := JsonPointer.Print(tokens);
    DecodeEncodedBytes(Encode(pointer));
    DecodeEncode(pointer);
    JsonPointer.ParsePrint(tokens);
  }
}

// Utf8: the bytes of a text, after section 3 of RFC 3629.  A reply leaves the server in this form,
// because json.dump() writes it so.
module Utf8 {
  import opened Base64
  import opened Wrappers

  function Digit(n: int): Byte
    requires 0 <= n < 0x10
  {
    [0, 1, 2, 3, 4, 5, 6, 7, 8, 9, 10, 11, 12, 13, 14, 15][n]
  }

  // The byte with the value n, from its two hexadecimal digits.
  function Octet(n: int): Byte
    requires 0 <= n < 0x100
  {
    (Digit(n / 0x10) << 4) | Digit(n % 0x10)
  }

  lemma DigitValue(n: int)
    requires 0 <= n < 0x10
    ensures Digit(n) as int == n && Digit(n) < 0x10
  {
  }

  lemma JoinDigits(x: Byte, y: Byte)
    requires x < 0x10 && y < 0x10
    ensures ((x << 4) | y) as int == x as int * 0x10 + y as int
  {
  }

  lemma OctetValue(n: int)
    requires 0 <= n < 0x100
    ensures Octet(n) as int == n
  {
    hide Digit;
    DigitValue(n / 0x10);
    DigitValue(n % 0x10);
    JoinDigits(Digit(n / 0x10), Digit(n % 0x10));
  }

  // One character as one to four bytes.
  function EncodeChar(c: char): (r: Bytes)
    ensures 1 <= |r| <= 4
  {
    var n := c as int;
    if n < 0x80 then [Octet(n)]
    else if n < 0x800 then [Octet(0xC0 + n / 0x40), Octet(0x80 + n % 0x40)]
    else if n < 0x1_0000 then
      [Octet(0xE0 + n / 0x1000), Octet(0x80 + n / 0x40 % 0x40), Octet(0x80 + n % 0x40)]
    else
      [Octet(0xF0 + n / 0x4_0000), Octet(0x80 + n / 0x1000 % 0x40), Octet(0x80 + n / 0x40 % 0x40),
       Octet(0x80 + n % 0x40)]
  }

  function Encode(s: string): Bytes {
    if s == "" then [] else EncodeChar(s[0]) + Encode(s[1..])
  }

  // No text becomes shorter.
  lemma {:induction false} NoShorter(s: string)
    ensures |Encode(s)| >= |s|
  {
    hide EncodeChar;
    if s != "" {
      NoShorter(s[1..]);
    }
  }

  // ---------------------------------------------------------------------------------------
  // Reading
  // ---------------------------------------------------------------------------------------

  // How many bytes a character takes that starts with this one; 0 if none does.
  function Count(first: int): nat {
    if first < 0x80 then 1
    else if 0xC0 <= first < 0xE0 then 2
    else if 0xE0 <= first < 0xF0 then 3
    else if 0xF0 <= first < 0xF8 then 4
    else 0
  }

  // The bits of the code that the first byte holds.
  function FirstBits(first: int): int {
    if first < 0x80 then first
    else if first < 0xE0 then first - 0xC0
    else if first < 0xF0 then first - 0xE0
    else first - 0xF0
  }

  // Every further byte holds six more.
  function MoreBits(high: int, rest: Bytes): Option<int>
    decreases |rest|
  {
    if rest == [] then Some(high)
    else if 0x80 <= rest[0] as int < 0xC0 then MoreBits(high * 0x40 + (rest[0] as int - 0x80), rest[1..])
    else None
  }

  // The least code that takes so many bytes; a longer form is not allowed.
  function Least(count: nat): int {
    if count == 1 then 0 else if count == 2 then 0x80 else if count == 3 then 0x800 else 0x1_0000
  }

  function DecodeChar(b: Bytes): Option<char> {
    if b == [] then None
    else
      match MoreBits(FirstBits(b[0] as int), b[1..])
      case None => None
      case Some(n) =>
        if Least(|b|) <= n < 0x11_0000 && !(0xD800 <= n < 0xE000) && n >= 0 then Some(n as char) else None
  }

  function Decode(b: Bytes): Option<string> {
    if b == [] then Some("")
    else
      var count := Count(b[0] as int);
      if count == 0 || |b| < count then None
      else
        match (DecodeChar(b[..count]), Decode(b[count..]))
        case (Some(c), Some(s)) => Some([c] + s)
        case _ => None
  }

  lemma NoMoreBits(n: int)
    ensures MoreBits(n, []) == Some(n)
  {
  }

  lemma MoreBitsNext(high: int, n: int, rest: Bytes)
    requires 0 <= n < 0x40
    ensures MoreBits(high, [Octet(0x80 + n)] + rest) == MoreBits(high * 0x40 + n, rest)
  {
    hide Octet;
    OctetValue(0x80 + n);
    assert ([Octet(0x80 + n)] + rest)[1..] == rest;
  }

  // The six-bit groups of a code, put together again.
  lemma Groups(n: int)
    requires 0 <= n
    ensures n / 0x40 * 0x40 + n % 0x40 == n
    ensures n / 0x1000 * 0x40 + n / 0x40 % 0x40 == n / 0x40
    ensures n / 0x4_0000 * 0x40 + n / 0x1000 % 0x40 == n / 0x1000
  {
  }

  lemma OneMore(n: int)
    requires 0 <= n
    ensures MoreBits(n / 0x40, [Octet(0x80 + n % 0x40)]) == Some(n)
  {
    hide Octet, MoreBits;
    Groups(n);
    NoMoreBits(n);
    MoreBitsNext(n / 0x40, n % 0x40, []);
    assert [Octet(0x80 + n % 0x40)] + [] == [Octet(0x80 + n % 0x40)];
  }

  lemma TwoMore(n: int)
    requires 0 <= n
    ensures MoreBits(n / 0x1000, [Octet(0x80 + n / 0x40 % 0x40), Octet(0x80 + n % 0x40)]) == Some(n)
  {
    hide Octet, MoreBits;
    Groups(n);
    OneMore(n);
    var rest := [Octet(0x80 + n % 0x40)];
    MoreBitsNext(n / 0x1000, n / 0x40 % 0x40, rest);
    assert [Octet(0x80 + n / 0x40 % 0x40)] + rest == [Octet(0x80 + n / 0x40 % 0x40), Octet(0x80 + n % 0x40)];
  }

  lemma ThreeMore(n: int)
    requires 0 <= n
    ensures MoreBits(n / 0x4_0000, [Octet(0x80 + n / 0x1000 % 0x40), Octet(0x80 + n / 0x40 % 0x40),
                                    Octet(0x80 + n % 0x40)]) == Some(n)
  {
    hide Octet, MoreBits;
    Groups(n);
    TwoMore(n);
    var rest := [Octet(0x80 + n / 0x40 % 0x40), Octet(0x80 + n % 0x40)];
    MoreBitsNext(n / 0x4_0000, n / 0x1000 % 0x40, rest);
    assert [Octet(0x80 + n / 0x1000 % 0x40)] + rest
        == [Octet(0x80 + n / 0x1000 % 0x40), Octet(0x80 + n / 0x40 % 0x40), Octet(0x80 + n % 0x40)];
  }

  predicate Decodes(b: Bytes, c: char) {
    b != [] && Count(b[0] as int) == |b| && DecodeChar(b) == Some(c)
  }

  lemma DecodesFrom(first: int, rest: Bytes, c: char)
    requires 0 <= first < 0x100 && Count(first) == 1 + |rest|
    requires MoreBits(FirstBits(first), rest) == Some(c as int) && Least(1 + |rest|) <= c as int
    ensures Decodes([Octet(first)] + rest, c)
  {
    hide Octet, MoreBits, Count, FirstBits, Least;
    OctetValue(first);
    assert ([Octet(first)] + rest)[1..] == rest;
  }

  // Every character is told from its bytes, and its first byte tells how many they are.
  lemma CharRoundTrip(c: char)
    ensures Decodes(EncodeChar(c), c)
  {
    hide Octet, MoreBits, Decodes;
    var n := c as int;
    if n < 0x80 {
      NoMoreBits(n);
      DecodesFrom(n, [], c);
      assert [Octet(n)] + [] == [Octet(n)];
    } else if n < 0x800 {
      OneMore(n);
      var rest := [Octet(0x80 + n % 0x40)];
      DecodesFrom(0xC0 + n / 0x40, rest, c);
      assert EncodeChar(c) == [Octet(0xC0 + n / 0x40)] + rest;
    } else if n < 0x1_0000 {
      TwoMore(n);
      var rest := [Octet(0x80 + n / 0x40 % 0x40), Octet(0x80 + n % 0x40)];
      DecodesFrom(0xE0 + n / 0x1000, rest, c);
      assert EncodeChar(c) == [Octet(0xE0 + n / 0x1000)] + rest;
    } else {
      ThreeMore(n);
      var rest := [Octet(0x80 + n / 0x1000 % 0x40), Octet(0x80 + n / 0x40 % 0x40), Octet(0x80 + n % 0x40)];
      DecodesFrom(0xF0 + n / 0x4_0000, rest, c);
      assert EncodeChar(c) == [Octet(0xF0 + n / 0x4_0000)] + rest;
    }
  }

  // A text is read from its bytes as it was.
  lemma {:induction false} RoundTrip(s: string)
    ensures Decode(Encode(s)) == Some(s)
  {
    hide EncodeChar, DecodeChar, Count;
    if s != "" {
      var first, rest := EncodeChar(s[0]), Encode(s[1..]);
      var b := first + rest;
      assert b[..|first|] == first && b[|first|..] == rest && b[0] == first[0];
      CharRoundTrip(s[0]);
      RoundTrip(s[1..]);
      assert [s[0]] + s[1..] == s;
    }
  }
}
